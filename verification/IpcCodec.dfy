/** The twelve codecs of ipc-protocol/src/codec.rs. Beside them stands one table of
    message shapes, written from the word layouts the codec documents; each codec is
    shown to accept exactly the messages the table accepts, to report the error the
    table calls for, and to re-encode to the table's normal form. */
module IpcCodec {
  import opened Bits
  import opened Options
  import opened IpcMessages

  // ---------------------------------------------------------------------------
  // Labels
  // ---------------------------------------------------------------------------

  const PROTOCOL_VERSION: nat := 1

  function Number(ns: Namespace): (r: nat)
    ensures 1 <= r <= 6
  {
    match ns
    case Fs => 1
    case Driver => 2
    case Display => 3
    case NetBypass => 4
    case Mm => 5
    case Security => 6
  }

  function FromLabel(tag: U64): Option<Namespace> {
    var n := Shr(tag, 56) % 256;
    if n == 1 then Some(Fs)
    else if n == 2 then Some(Driver)
    else if n == 3 then Some(Display)
    else if n == 4 then Some(NetBypass)
    else if n == 5 then Some(Mm)
    else if n == 6 then Some(Security)
    else None
  }

  function Label(ns: Namespace, op: nat): nat {
    Or(Or(Shl(Number(ns), 56), Shl(PROTOCOL_VERSION, 8)), op)
  }

  /** The version and the opcode. */
  function LabelParts(tag: U64): (nat, nat) {
    (And(Shr(tag, 8), 0xFFFF), And(tag, 0xFF))
  }

  const TWO56: nat := 0x100_0000_0000_0000

  lemma LabelPowers()
    ensures Pow2(8) == 256 && Pow2(16) == 0x1_0000 && Pow2(56) == TWO56
  {
    Powers();
    Pow2Add(44, 12);
    Pow2Add(8, 8);
  }

  /** What the shifts and masks select. */
  lemma LabelFields(tag: U64)
    ensures forall ns :: FromLabel(tag) == Some(ns) <==> tag / TWO56 == Number(ns)
    ensures LabelParts(tag) == (tag / 256 % 0x1_0000, tag % 256)
  {
    hide And, Or, Shr, Shl, Pow2;
    LabelPowers();
    ShrBy(tag, 56, TWO56);
    ShrBy(tag, 8, 256);
    AndBy(tag / 256, 16, 0x1_0000);
    AndBy(tag, 8, 256);
  }

  lemma LabelIsSum(ns: Namespace, op: nat)
    requires op < 256
    ensures Label(ns, op) == Number(ns) * TWO56 + 256 + op < TWO64
  {
    hide And, Or, Shr, Shl, Pow2;
    LabelPowers();
    ShlBy(Number(ns), 56, TWO56);
    ShlBy(PROTOCOL_VERSION, 8, 256);
    MulMod(Number(ns), TWO56);
    OrDisjoint(Number(ns) * TWO56, 256, 56);
    OrDisjoint(Number(ns) * TWO56 + 256, op, 8);
  }

  // ---------------------------------------------------------------------------
  // Shared steps of every codec
  // ---------------------------------------------------------------------------

  /** An encoder's message; the empty one stands in when the words do not fit. */
  function Pack(ns: Namespace, op: nat, words: seq<U64>): SmallMessage
    requires op < 256
  {
    LabelIsSum(ns, op);
    if |words| <= MSG_MAX_WORDS then RawMessage(Label(ns, op), words) else RawMessage(Label(ns, op), [])
  }

  /** The opcode of a message of this namespace and version. */
  function Opcode(ns: Namespace, m: SmallMessage): Decoded<nat> {
    if FromLabel(m.tag) != Some(ns) then Err(WrongNamespace)
    else
      var (version, op) := LabelParts(m.tag);
      if version != PROTOCOL_VERSION then Err(VersionMismatch) else Ok(op)
  }

  function Need(w: seq<U64>, n: nat): Check {
    if |w| < n then Fail(Truncated) else Pass
  }

  function AsU32(w: U64): U32 {
    w % 0x1_0000_0000
  }

  function Word(b: bool): U64 {
    if b then 1 else 0
  }

  // ---------------------------------------------------------------------------
  // File system
  // ---------------------------------------------------------------------------

  function FlagsOf(bits: U32): Decoded<OpenFlags> {
    if bits < 64 then Ok(bits) else Err(BadField)
  }

  function EncodeFsRequest(x: FsRequest): SmallMessage {
    var (op: nat, words: seq<U64>) :=
      match x {
        case Open(path, flags) => (1, [path, flags, 0, 0])
        case Read(handle, offset, len, cap) => (2, [handle, offset, len, cap])
        case Write(handle, offset, len, cap) => (3, [handle, offset, len, cap])
        case Stat(path) => (4, [path, 0, 0, 0])
        case Close(handle) => (5, [handle, 0, 0, 0])
      };
    var n := if op == 1 then 2 else if op == 2 || op == 3 then 4 else 1;
    Pack(Fs, op, words[..n])
  }

  function DecodeFsRequest(m: SmallMessage): Decoded<FsRequest> {
    var op :- Opcode(Fs, m);
    var w := m.words;
    match op
    case 1 =>
      :- Need(w, 2);
      var flags :- FlagsOf(AsU32(w[1]));
      Ok(FsRequest.Open(AsU32(w[0]), flags))
    case 2 =>
      :- Need(w, 4);
      Ok(FsRequest.Read(AsU32(w[0]), w[1], AsU32(w[2]), AsU32(w[3])))
    case 3 =>
      :- Need(w, 4);
      Ok(FsRequest.Write(AsU32(w[0]), w[1], AsU32(w[2]), AsU32(w[3])))
    case 4 =>
      :- Need(w, 1);
      Ok(FsRequest.Stat(AsU32(w[0])))
    case 5 =>
      :- Need(w, 1);
      Ok(FsRequest.Close(AsU32(w[0])))
    case _ => Err(UnknownOpcode)
  }

  function FsErrorWord(c: FsErrorCode): U64 {
    match c
    case NotFound => 1
    case Denied => 2
    case BadHandle => 3
    case BadPath => 4
    case Unsupported => 5
    case BadSharedRegion => 6
    case Io => 7
  }

  function FsErrorOf(w: U64): Decoded<FsErrorCode> {
    match w
    case 1 => Ok(FsErrorCode.NotFound)
    case 2 => Ok(FsErrorCode.Denied)
    case 3 => Ok(FsErrorCode.BadHandle)
    case 4 => Ok(FsErrorCode.BadPath)
    case 5 => Ok(FsErrorCode.Unsupported)
    case 6 => Ok(FsErrorCode.BadSharedRegion)
    case 7 => Ok(FsErrorCode.Io)
    case _ => Err(BadField)
  }

  function EncodeFsResponse(x: FsResponse): SmallMessage {
    var (op: nat, words: seq<U64>) :=
      match x {
        case Opened(handle) => (1, [handle, 0])
        case Read(bytes) => (2, [bytes, 0])
        case Written(bytes) => (3, [bytes, 0])
        case Stat(size, is_dir) => (4, [size, Word(is_dir)])
        case Closed => (5, [0, 0])
        case Error(code) => (6, [FsErrorWord(code), 0])
      };
    var n := if op == 4 then 2 else if op == 5 then 0 else 1;
    Pack(Fs, op, words[..n])
  }

  function DecodeFsResponse(m: SmallMessage): Decoded<FsResponse> {
    var op :- Opcode(Fs, m);
    var w := m.words;
    match op
    case 1 =>
      :- Need(w, 1);
      Ok(FsResponse.Opened(AsU32(w[0])))
    case 2 =>
      :- Need(w, 1);
      Ok(FsResponse.Read(AsU32(w[0])))
    case 3 =>
      :- Need(w, 1);
      Ok(FsResponse.Written(AsU32(w[0])))
    case 4 =>
      :- Need(w, 2);
      Ok(FsResponse.Stat(w[0], w[1] != 0))
    case 5 => Ok(FsResponse.Closed)
    case 6 =>
      :- Need(w, 1);
      var code :- FsErrorOf(w[0]);
      Ok(FsResponse.Error(code))
    case _ => Err(UnknownOpcode)
  }

  // ---------------------------------------------------------------------------
  // Drivers
  // ---------------------------------------------------------------------------

  function EncodeDriverRequest(x: DriverRequest): SmallMessage {
    var (op: nat, words: seq<U64>) :=
      match x {
        case Probe => (1, [0, 0, 0])
        case Irq(line) => (2, [line, 0, 0])
        case ReadBlocks(lba, count, cap) => (3, [lba, count, cap])
        case WriteBlocks(lba, count, cap) => (4, [lba, count, cap])
        case Quiesce => (5, [0, 0, 0])
        case SendFrame(len) => (6, [len, 0, 0])
        case PollFrame => (7, [0, 0, 0])
      };
    var n := if op == 2 || op == 6 then 1 else if op == 3 || op == 4 then 3 else 0;
    Pack(Driver, op, words[..n])
  }

  function DecodeDriverRequest(m: SmallMessage): Decoded<DriverRequest> {
    var op :- Opcode(Driver, m);
    var w := m.words;
    match op
    case 1 => Ok(DriverRequest.Probe)
    case 2 =>
      :- Need(w, 1);
      Ok(DriverRequest.Irq(AsU32(w[0])))
    case 3 =>
      :- Need(w, 3);
      Ok(DriverRequest.ReadBlocks(w[0], AsU32(w[1]), AsU32(w[2])))
    case 4 =>
      :- Need(w, 3);
      Ok(DriverRequest.WriteBlocks(w[0], AsU32(w[1]), AsU32(w[2])))
    case 5 => Ok(DriverRequest.Quiesce)
    case 6 =>
      :- Need(w, 1);
      Ok(DriverRequest.SendFrame(AsU32(w[0])))
    case 7 => Ok(DriverRequest.PollFrame)
    case _ => Err(UnknownOpcode)
  }

  function DriverErrorWord(c: DriverErrorCode): U64 {
    match c
    case ProbeFailed => 1
    case OutOfRange => 2
    case BadSharedRegion => 3
    case DeviceIo => 4
    case Unsupported => 5
    case NoData => 6
    case DriverBusy => 7
  }

  function DriverErrorOf(w: U64): Decoded<DriverErrorCode> {
    match w
    case 1 => Ok(DriverErrorCode.ProbeFailed)
    case 2 => Ok(DriverErrorCode.OutOfRange)
    case 3 => Ok(DriverErrorCode.BadSharedRegion)
    case 4 => Ok(DriverErrorCode.DeviceIo)
    case 5 => Ok(DriverErrorCode.Unsupported)
    case 6 => Ok(DriverErrorCode.NoData)
    case 7 => Ok(DriverErrorCode.DriverBusy)
    case _ => Err(BadField)
  }

  function EncodeDriverResponse(x: DriverResponse): SmallMessage {
    var (op: nat, words: seq<U64>) :=
      match x {
        case Ready(size, count) => (1, [size, count])
        case Completed(sectors) => (2, [sectors, 0])
        case Failed(code) => (3, [DriverErrorWord(code), 0])
        case FrameSent => (4, [0, 0])
        case FrameReceived(len) => (5, [len, 0])
      };
    var n := if op == 1 then 2 else if op == 4 then 0 else 1;
    Pack(Driver, op, words[..n])
  }

  function DecodeDriverResponse(m: SmallMessage): Decoded<DriverResponse> {
    var op :- Opcode(Driver, m);
    var w := m.words;
    match op
    case 1 =>
      :- Need(w, 2);
      Ok(DriverResponse.Ready(AsU32(w[0]), w[1]))
    case 2 =>
      :- Need(w, 1);
      Ok(DriverResponse.Completed(AsU32(w[0])))
    case 3 =>
      :- Need(w, 1);
      var code :- DriverErrorOf(w[0]);
      Ok(DriverResponse.Failed(code))
    case 4 => Ok(DriverResponse.FrameSent)
    case 5 =>
      :- Need(w, 1);
      Ok(DriverResponse.FrameReceived(AsU32(w[0])))
    case _ => Err(UnknownOpcode)
  }

  // ---------------------------------------------------------------------------
  // Display
  // ---------------------------------------------------------------------------

  function EncodeDisplayRequest(x: DisplayRequest): SmallMessage {
    var (op: nat, words: seq<U64>) :=
      match x {
        case CreateSurface => (1, [0, 0, 0, 0])
        case CommitBuffer(surface, cap, width, height) => (2, [surface, cap, width, height])
        case DestroySurface(surface) => (3, [surface, 0, 0, 0])
        case SubscribeInput => (4, [0, 0, 0, 0])
        case QueryOutputs => (5, [0, 0, 0, 0])
      };
    var n := if op == 2 then 4 else if op == 3 then 1 else 0;
    Pack(Display, op, words[..n])
  }

  function DecodeDisplayRequest(m: SmallMessage): Decoded<DisplayRequest> {
    var op :- Opcode(Display, m);
    var w := m.words;
    match op
    case 1 => Ok(DisplayRequest.CreateSurface)
    case 2 =>
      :- Need(w, 4);
      Ok(DisplayRequest.CommitBuffer(AsU32(w[0]), AsU32(w[1]), AsU32(w[2]), AsU32(w[3])))
    case 3 =>
      :- Need(w, 1);
      Ok(DisplayRequest.DestroySurface(AsU32(w[0])))
    case 4 => Ok(DisplayRequest.SubscribeInput)
    case 5 => Ok(DisplayRequest.QueryOutputs)
    case _ => Err(UnknownOpcode)
  }

  function DisplayErrorWord(c: DisplayErrorCode): U64 {
    match c
    case BadSurface => 1
    case BadBuffer => 2
    case Unsupported => 3
  }

  function DisplayErrorOf(w: U64): Decoded<DisplayErrorCode> {
    match w
    case 1 => Ok(DisplayErrorCode.BadSurface)
    case 2 => Ok(DisplayErrorCode.BadBuffer)
    case 3 => Ok(DisplayErrorCode.Unsupported)
    case _ => Err(BadField)
  }

  function EncodeDisplayResponse(x: DisplayResponse): SmallMessage {
    var (op: nat, words: seq<U64>) :=
      match x {
        case SurfaceCreated(surface) => (1, [surface, 0, 0, 0])
        case Committed => (2, [0, 0, 0, 0])
        case Destroyed => (3, [0, 0, 0, 0])
        case InputSubscribed => (4, [0, 0, 0, 0])
        case OutputTopology(count, width, height, refresh) => (5, [count, width, height, refresh])
        case Error(code) => (6, [DisplayErrorWord(code), 0, 0, 0])
      };
    var n := if op == 5 then 4 else if op == 1 || op == 6 then 1 else 0;
    Pack(Display, op, words[..n])
  }

  function DecodeDisplayResponse(m: SmallMessage): Decoded<DisplayResponse> {
    var op :- Opcode(Display, m);
    var w := m.words;
    match op
    case 1 =>
      :- Need(w, 1);
      Ok(DisplayResponse.SurfaceCreated(AsU32(w[0])))
    case 2 => Ok(DisplayResponse.Committed)
    case 3 => Ok(DisplayResponse.Destroyed)
    case 4 => Ok(DisplayResponse.InputSubscribed)
    case 5 =>
      :- Need(w, 4);
      Ok(DisplayResponse.OutputTopology(AsU32(w[0]), AsU32(w[1]), AsU32(w[2]), AsU32(w[3])))
    case 6 =>
      :- Need(w, 1);
      var code :- DisplayErrorOf(w[0]);
      Ok(DisplayResponse.Error(code))
    case _ => Err(UnknownOpcode)
  }

  // ---------------------------------------------------------------------------
  // Memory policy
  // ---------------------------------------------------------------------------

  function ClassWord(c: ReclaimClass): U64 {
    match c
    case Protected => 0
    case Normal => 1
    case Sacrificial => 2
  }

  function ClassOf(w: U64): Decoded<ReclaimClass> {
    match w
    case 0 => Ok(ReclaimClass.Protected)
    case 1 => Ok(ReclaimClass.Normal)
    case 2 => Ok(ReclaimClass.Sacrificial)
    case _ => Err(BadField)
  }

  function KindWord(k: ComputeKind): U64 {
    match k
    case Cpu => 0
    case Gpu => 1
    case Npu => 2
    case Tpu => 3
    case Fpga => 4
  }

  function KindOf(w: U64): Decoded<ComputeKind> {
    match w
    case 0 => Ok(ComputeKind.Cpu)
    case 1 => Ok(ComputeKind.Gpu)
    case 2 => Ok(ComputeKind.Npu)
    case 3 => Ok(ComputeKind.Tpu)
    case 4 => Ok(ComputeKind.Fpga)
    case _ => Err(BadField)
  }

  function EncodeMmRequest(x: MmRequest): SmallMessage {
    var (op: nat, words: seq<U64>) :=
      match x {
        case Register(thread, resident, c) => (1, [thread, resident, ClassWord(c), 0])
        case Unregister(thread) => (2, [thread, 0, 0, 0])
        case QueryVictim => (3, [0, 0, 0, 0])
        case QueryTotalResident => (4, [0, 0, 0, 0])
        case RegisterSwapRegion(thread, region, bytes, touched) => (5, [thread, region, bytes, touched])
        case UnregisterSwapRegion(thread, region) => (6, [thread, region, 0, 0])
        case QuerySwapVictim => (7, [0, 0, 0, 0])
        case RegisterComputePool(pool, kind, capacity, used) => (8, [pool, KindWord(kind), capacity, used])
        case QueryComputePool(bytes, Some(k)) => (9, [bytes, 1, KindWord(k), 0])
        case QueryComputePool(bytes, None) => (9, [bytes, 0, 0, 0])
      };
    var n := if op == 1 || op == 5 || op == 8 then 4 else if op == 9 || op == 6 then 3 else if op == 2 then 1 else 0;
    Pack(Mm, op, words[..n])
  }

  function DecodeMmRequest(m: SmallMessage): Decoded<MmRequest> {
    var op :- Opcode(Mm, m);
    var w := m.words;
    match op
    case 1 =>
      :- Need(w, 3);
      var c :- ClassOf(w[2]);
      Ok(MmRequest.Register(AsU32(w[0]), w[1], c))
    case 2 =>
      :- Need(w, 1);
      Ok(MmRequest.Unregister(AsU32(w[0])))
    case 3 => Ok(MmRequest.QueryVictim)
    case 4 => Ok(MmRequest.QueryTotalResident)
    case 5 =>
      :- Need(w, 4);
      Ok(MmRequest.RegisterSwapRegion(AsU32(w[0]), AsU32(w[1]), w[2], w[3]))
    case 6 =>
      :- Need(w, 2);
      Ok(MmRequest.UnregisterSwapRegion(AsU32(w[0]), AsU32(w[1])))
    case 7 => Ok(MmRequest.QuerySwapVictim)
    case 8 =>
      :- Need(w, 4);
      var kind :- KindOf(w[1]);
      Ok(MmRequest.RegisterComputePool(AsU32(w[0]), kind, w[2], w[3]))
    case 9 =>
      :- Need(w, 3);
      if w[1] == 0 then Ok(MmRequest.QueryComputePool(w[0], None))
      else if w[1] == 1 then
        var kind :- KindOf(w[2]);
        Ok(MmRequest.QueryComputePool(w[0], Some(kind)))
      else Err(BadField)
    case _ => Err(UnknownOpcode)
  }

  function MmErrorWord(c: MmErrorCode): U64 {
    match c
    case Unsupported => 1
  }

  function MmErrorOf(w: U64): Decoded<MmErrorCode> {
    match w
    case 1 => Ok(MmErrorCode.Unsupported)
    case _ => Err(BadField)
  }

  function EncodeMmResponse(x: MmResponse): SmallMessage {
    var (op: nat, words: seq<U64>) :=
      match x {
        case Registered => (1, [0, 0])
        case Unregistered => (2, [0, 0])
        case Victim(thread) => (3, [thread, 0])
        case TotalResident(bytes) => (4, [bytes, 0])
        case SwapRegionRegistered => (6, [0, 0])
        case SwapRegionUnregistered => (7, [0, 0])
        case SwapVictim(thread, region) => (8, [thread, region])
        case ComputePoolRegistered => (9, [0, 0])
        case ComputePoolChosen(pool) => (10, [pool, 0])
        case Error(code) => (5, [MmErrorWord(code), 0])
      };
    var n := if op == 1 || op == 2 || op == 6 || op == 7 || op == 9 then 0 else if op == 8 then 2 else 1;
    Pack(Mm, op, words[..n])
  }

  function DecodeMmResponse(m: SmallMessage): Decoded<MmResponse> {
    var op :- Opcode(Mm, m);
    var w := m.words;
    match op
    case 1 => Ok(MmResponse.Registered)
    case 2 => Ok(MmResponse.Unregistered)
    case 3 =>
      :- Need(w, 1);
      Ok(MmResponse.Victim(AsU32(w[0])))
    case 4 =>
      :- Need(w, 1);
      Ok(MmResponse.TotalResident(w[0]))
    case 6 => Ok(MmResponse.SwapRegionRegistered)
    case 7 => Ok(MmResponse.SwapRegionUnregistered)
    case 8 =>
      :- Need(w, 2);
      Ok(MmResponse.SwapVictim(AsU32(w[0]), AsU32(w[1])))
    case 9 => Ok(MmResponse.ComputePoolRegistered)
    case 10 =>
      :- Need(w, 1);
      Ok(MmResponse.ComputePoolChosen(AsU32(w[0])))
    case 5 =>
      :- Need(w, 1);
      var code :- MmErrorOf(w[0]);
      Ok(MmResponse.Error(code))
    case _ => Err(UnknownOpcode)
  }

  // ---------------------------------------------------------------------------
  // Kernel-bypass networking
  // ---------------------------------------------------------------------------

  function EncodeNetBypassRequest(x: NetBypassRequest): SmallMessage {
    var (op: nat, words: seq<U64>) :=
      match x {
        case RequestDirectNic(nic) => (1, [nic])
        case Release(handle) => (2, [handle])
        case RelayFrame => (3, [0])
      };
    var n := if op == 3 then 0 else 1;
    Pack(NetBypass, op, words[..n])
  }

  function DecodeNetBypassRequest(m: SmallMessage): Decoded<NetBypassRequest> {
    var op :- Opcode(NetBypass, m);
    var w := m.words;
    match op
    case 1 =>
      :- Need(w, 1);
      Ok(NetBypassRequest.RequestDirectNic(AsU32(w[0])))
    case 2 =>
      :- Need(w, 1);
      Ok(NetBypassRequest.Release(AsU32(w[0])))
    case 3 => Ok(NetBypassRequest.RelayFrame)
    case _ => Err(UnknownOpcode)
  }

  function EncodeNetBypassResponse(x: NetBypassResponse): SmallMessage {
    var (op: nat, words: seq<U64>) :=
      match x {
        case Granted(handle, rx, tx, len) => (1, [handle, rx, tx, len])
        case Denied => (2, [0, 0, 0, 0])
        case Released => (3, [0, 0, 0, 0])
        case Relayed => (4, [0, 0, 0, 0])
      };
    var n := if op == 1 then 4 else 0;
    Pack(NetBypass, op, words[..n])
  }

  function DecodeNetBypassResponse(m: SmallMessage): Decoded<NetBypassResponse> {
    var op :- Opcode(NetBypass, m);
    var w := m.words;
    match op
    case 1 =>
      :- Need(w, 4);
      Ok(NetBypassResponse.Granted(AsU32(w[0]), AsU32(w[1]), AsU32(w[2]), AsU32(w[3])))
    case 2 => Ok(NetBypassResponse.Denied)
    case 3 => Ok(NetBypassResponse.Released)
    case 4 => Ok(NetBypassResponse.Relayed)
    case _ => Err(UnknownOpcode)
  }

  // ---------------------------------------------------------------------------
  // Security broker
  // ---------------------------------------------------------------------------

  function EncodeSecurityRequest(x: SecurityRequest): SmallMessage {
    var (op: nat, words: seq<U64>) :=
      match x {
        case CapGrant(target, cap, rights) => (1, [target, cap, rights])
        case CapRevoke(cap) => (2, [cap, 0, 0])
      };
    var n := if op == 1 then 3 else 1;
    Pack(Security, op, words[..n])
  }

  function DecodeSecurityRequest(m: SmallMessage): Decoded<SecurityRequest> {
    var op :- Opcode(Security, m);
    var w := m.words;
    match op
    case 1 =>
      :- Need(w, 3);
      Ok(SecurityRequest.CapGrant(AsU32(w[0]), AsU32(w[1]), AsU32(w[2])))
    case 2 =>
      :- Need(w, 1);
      Ok(SecurityRequest.CapRevoke(AsU32(w[0])))
    case _ => Err(UnknownOpcode)
  }

  function SecurityErrorWord(c: SecurityErrorCode): U64 {
    match c
    case Unsupported => 1
    case UnknownService => 2
    case KernelRejected => 3
  }

  function SecurityErrorOf(w: U64): Decoded<SecurityErrorCode> {
    match w
    case 1 => Ok(SecurityErrorCode.Unsupported)
    case 2 => Ok(SecurityErrorCode.UnknownService)
    case 3 => Ok(SecurityErrorCode.KernelRejected)
    case _ => Err(BadField)
  }

  function EncodeSecurityResponse(x: SecurityResponse): SmallMessage {
    var (op: nat, word: U64) :=
      match x {
        case Granted(dst) => (1, dst)
        case Revoked(freed) => (2, freed)
        case Error(code) => (3, SecurityErrorWord(code))
      };
    Pack(Security, op, [word])
  }

  /** The one decoder that checks for words before it looks at the opcode. */
  function DecodeSecurityResponse(m: SmallMessage): Decoded<SecurityResponse> {
    var op :- Opcode(Security, m);
    var w := m.words;
    :- Need(w, 1);
    match op
    case 1 => Ok(SecurityResponse.Granted(AsU32(w[0])))
    case 2 => Ok(SecurityResponse.Revoked(AsU32(w[0])))
    case 3 =>
      var code :- SecurityErrorOf(w[0]);
      Ok(SecurityResponse.Error(code))
    case _ => Err(UnknownOpcode)
  }
}
